/**
 * The move rules of the puzzle, as values: when a tile may slide into the
 * blank (isValidMove), what a slide does to the board (moveTile), and the
 * random walk of the blank that scrambles a board (shuffleBoard).
 */
module Rules {
  import opened Grid

  function Abs(x: int): nat {
    if x < 0 then -x else x
  }

  /**
   * The adjacency test of isValidMove: one step apart in exactly one axis.
   * It is the same as Manhattan distance 1, so there are no diagonal moves,
   * and since positions are not taken modulo the board size, no wrap-around.
   */
  function Adjacent(p: Pos, q: Pos): (adj: bool)
    ensures adj <==> Abs(p.row - q.row) + Abs(p.col - q.col) == 1
  {
    (Abs(p.row - q.row) == 1 && p.col == q.col) || (Abs(p.col - q.col) == 1 && p.row == q.row)
  }

  /**
   * isValidMove: the first blank and the first cell holding tile are both
   * found, and they are adjacent.
   */
  function ValidMove(g: Board, tile: int): bool
    requires IsSquare(g)
  {
    match (Find(g, 0), Find(g, tile))
    case (Some(blank), Some(at)) => Adjacent(blank, at)
    case _ => false
  }

  /**
   * A move is refused when the blank or the tile is missing, and the blank
   * itself is never a movable tile.  A valid move names a tile other than
   * the blank, found next to the blank.
   */
  lemma ValidMoveNecessary(g: Board, tile: int)
    requires IsSquare(g)
    ensures !Occurs(g, 0) || !Occurs(g, tile) ==> !ValidMove(g, tile)
    ensures !ValidMove(g, 0)
    ensures ValidMove(g, tile) ==>
      && tile != 0
      && FirstAt(g, 0, Find(g, 0).value)
      && FirstAt(g, tile, Find(g, tile).value)
      && Adjacent(Find(g, 0).value, Find(g, tile).value)
  {
    FindSpec(g, 0);
    FindSpec(g, tile);
  }

  /**
   * On a board of distinct labels the rule is exactly "some blank cell and
   * some cell holding tile are 4-neighbours", in both directions.
   */
  lemma ValidMoveOnDistinct(g: Board, tile: int)
    requires IsSquare(g) && Distinct(g)
    ensures ValidMove(g, tile) <==>
      exists blank, at :: InBounds(|g|, blank) && InBounds(|g|, at)
        && At(g, blank) == 0 && At(g, at) == tile && Adjacent(blank, at)
  {
    if exists blank, at :: InBounds(|g|, blank) && InBounds(|g|, at)
        && At(g, blank) == 0 && At(g, at) == tile && Adjacent(blank, at)
    {
      var blank, at :| InBounds(|g|, blank) && InBounds(|g|, at)
        && At(g, blank) == 0 && At(g, at) == tile && Adjacent(blank, at);
      DistinctFind(g, blank);
      DistinctFind(g, at);
    }
  }

  /**
   * The two writes of a slide: the blank's cell takes the label of cell
   * tile, and cell tile becomes the blank.
   */
  function Slide(g: Board, blank: Pos, tile: Pos): (h: Board)
    requires IsSquare(g) && InBounds(|g|, blank) && InBounds(|g|, tile)
    ensures IsSquare(h) && |h| == |g|
  {
    Put(Put(g, blank, At(g, tile)), tile, 0)
  }

  /**
   * Sliding a tile into a distinct blank cell exchanges the two labels,
   * leaves every other cell alone and keeps the multiset of labels.
   */
  lemma SlideSpec(g: Board, blank: Pos, tile: Pos)
    requires IsSquare(g) && InBounds(|g|, blank) && InBounds(|g|, tile)
    requires blank != tile && At(g, blank) == 0
    ensures At(Slide(g, blank, tile), blank) == At(g, tile)
    ensures At(Slide(g, blank, tile), tile) == 0
    ensures forall p :: InBounds(|g|, p) && p != blank && p != tile ==>
      At(Slide(g, blank, tile), p) == At(g, p)
    ensures multiset(Flatten(Slide(g, blank, tile))) == multiset(Flatten(g))
  {
    var y := At(g, tile);
    var g1 := Put(g, blank, y);
    PutMultiset(g, blank, y);
    PutMultiset(g1, tile, 0);
    assert At(g1, tile) == y;
    var m, m1, m2 := multiset(Flatten(g)), multiset(Flatten(g1)), multiset(Flatten(Slide(g, blank, tile)));
    assert m1 + multiset{0} == m + multiset{y};
    assert m2 + multiset{y} == m1 + multiset{0};
    assert m2 + multiset{y} == m + multiset{y};
    assert m2 == m by {
      forall x ensures m2[x] == m[x] {
        assert (m2 + multiset{y})[x] == (m + multiset{y})[x];
      }
    }
  }

  /** The board after moveTile(tile) succeeds. */
  function Moved(g: Board, tile: int): (h: Board)
    requires IsSquare(g) && ValidMove(g, tile)
    ensures IsSquare(h) && |h| == |g|
  {
    Slide(g, Find(g, 0).value, Find(g, tile).value)
  }

  /**
   * A successful move: the blank's old cell now holds the tile, the tile's
   * old cell holds the blank, every other cell is as it was, and the board
   * holds the same labels as before.
   */
  lemma MoveEffect(g: Board, tile: int)
    requires IsSquare(g) && ValidMove(g, tile)
    ensures var blank, at := Find(g, 0).value, Find(g, tile).value;
      && At(Moved(g, tile), blank) == tile
      && At(Moved(g, tile), at) == 0
      && (forall p :: InBounds(|g|, p) && p != blank && p != at ==> At(Moved(g, tile), p) == At(g, p))
      && multiset(Flatten(Moved(g, tile))) == multiset(Flatten(g))
  {
    ValidMoveNecessary(g, tile);
    SlideSpec(g, Find(g, 0).value, Find(g, tile).value);
  }

  /**
   * On a board of distinct labels a move keeps the labels distinct, can be
   * made again with the same tile, and that second move restores the board.
   */
  lemma MoveInvolution(g: Board, tile: int)
    requires IsSquare(g) && Distinct(g) && ValidMove(g, tile)
    ensures Distinct(Moved(g, tile))
    ensures ValidMove(Moved(g, tile), tile)
    ensures Moved(Moved(g, tile), tile) == g
  {
    var blank, at := Find(g, 0).value, Find(g, tile).value;
    var h := Moved(g, tile);
    MoveEffect(g, tile);
    assert blank != at;
    forall p, q | InBounds(|h|, p) && InBounds(|h|, q) && At(h, p) == At(h, q)
      ensures p == q
    {
      var p' := if p == blank then at else if p == at then blank else p;
      var q' := if q == blank then at else if q == at then blank else q;
      assert At(h, p) == At(g, p') && At(h, q) == At(g, q');
    }
    assert Distinct(h);
    DistinctFind(h, at);
    DistinctFind(h, blank);
    assert Find(h, 0) == Some(at) && Find(h, tile) == Some(blank);
    MoveEffect(h, tile);
    BoardEq(Moved(h, tile), g);
  }

  // ---- The scramble ----

  /** The directions of shuffleBoard, in its order: right, left, down, up. */
  const Directions: seq<(int, int)> := [(0, 1), (0, -1), (1, 0), (-1, 0)]

  /** The cells p + d, for d in dirs in order, that lie on an n-by-n board. */
  function Neighbors(n: int, p: Pos, dirs: seq<(int, int)>): seq<Pos>
  {
    if dirs == [] then []
    else
      var d := dirs[|dirs| - 1];
      var q := Pos(p.row + d.0, p.col + d.1);
      Neighbors(n, p, dirs[..|dirs| - 1]) + (if InBounds(n, q) then [q] else [])
  }

  /** [q] when q lies on an n-by-n board, [] otherwise. */
  function OnBoard(n: int, q: Pos): seq<Pos> {
    if InBounds(n, q) then [q] else []
  }

  lemma NeighborsSnoc(n: int, p: Pos, dirs: seq<(int, int)>, d: (int, int))
    ensures Neighbors(n, p, dirs + [d]) == Neighbors(n, p, dirs) + OnBoard(n, Pos(p.row + d.0, p.col + d.1))
  {
    assert (dirs + [d])[..|dirs|] == dirs;
  }

  /** The four candidate cells, in the order of Directions. */
  lemma NeighborsUnfold(n: int, p: Pos)
    ensures Neighbors(n, p, Directions)
      == OnBoard(n, Pos(p.row, p.col + 1)) + OnBoard(n, Pos(p.row, p.col - 1))
       + OnBoard(n, Pos(p.row + 1, p.col)) + OnBoard(n, Pos(p.row - 1, p.col))
  {
    var a := [(0, 1)];
    var b := a + [(0, -1)];
    var c := b + [(1, 0)];
    assert Directions == c + [(-1, 0)];
    NeighborsSnoc(n, p, [], (0, 1));
    assert [] + [(0, 1)] == a;
    NeighborsSnoc(n, p, a, (0, -1));
    NeighborsSnoc(n, p, b, (1, 0));
    NeighborsSnoc(n, p, c, (-1, 0));
  }

  /**
   * The neighbour list of shuffleBoard holds exactly the in-bounds
   * 4-neighbours of the blank, each once; there are at least two of them
   * when the board is 2-by-2 or larger and none on a 1-by-1 board.
   */
  lemma NeighborsSpec(n: int, p: Pos)
    requires InBounds(n, p)
    ensures forall q :: q in Neighbors(n, p, Directions) <==> InBounds(n, q) && Adjacent(p, q)
    ensures forall i, j :: 0 <= i < j < |Neighbors(n, p, Directions)| ==>
      Neighbors(n, p, Directions)[i] != Neighbors(n, p, Directions)[j]
    ensures n >= 2 ==> |Neighbors(n, p, Directions)| >= 2
    ensures n == 1 ==> Neighbors(n, p, Directions) == []
  {
    NeighborsExact(n, p);
    NeighborsUnfold(n, p);
    NeighborsCount(n, p);
  }

  lemma NeighborsExact(n: int, p: Pos)
    requires InBounds(n, p)
    ensures forall q :: q in Neighbors(n, p, Directions) <==> InBounds(n, q) && Adjacent(p, q)
  {
    var right, left, down, up := Pos(p.row, p.col + 1), Pos(p.row, p.col - 1), Pos(p.row + 1, p.col), Pos(p.row - 1, p.col);
    NeighborsUnfold(n, p);
    var nb := Neighbors(n, p, Directions);
    forall q | InBounds(n, q) && Adjacent(p, q)
      ensures q in nb
    {
      assert q == right || q == left || q == down || q == up;
    }
  }

  lemma NeighborsCount(n: int, p: Pos)
    requires InBounds(n, p)
    ensures n >= 2 ==> |Neighbors(n, p, Directions)| >= 2
    ensures n == 1 ==> Neighbors(n, p, Directions) == []
  {
    var right, left, down, up := Pos(p.row, p.col + 1), Pos(p.row, p.col - 1), Pos(p.row + 1, p.col), Pos(p.row - 1, p.col);
    NeighborsUnfold(n, p);
    if n >= 2 {
      assert InBounds(n, right) || InBounds(n, left);
      assert InBounds(n, down) || InBounds(n, up);
    }
  }

  /** The values Math.random returns: each in [0, 1). */
  predicate Rolls(rolls: seq<real>) {
    forall i :: 0 <= i < |rolls| ==> 0.0 <= rolls[i] < 1.0
  }

  /** Math.floor(roll * count): an index into a list of count entries. */
  function Pick(roll: real, count: nat): (k: nat)
    requires 0.0 <= roll < 1.0 && count > 0
    ensures k < count
  {
    assert 0.0 <= roll * count as real < count as real;
    (roll * count as real).Floor
  }

  /** The blank's first cell. */
  function Blank(g: Board): (p: Pos)
    requires IsSquare(g) && Occurs(g, 0)
    ensures FirstAt(g, 0, p)
  {
    Find(g, 0).value
  }

  /** The neighbour one shuffle step swaps the blank with; None when it has none. */
  function StepTarget(g: Board, roll: real): (q: Option<Pos>)
    requires IsSquare(g) && Occurs(g, 0) && 0.0 <= roll < 1.0
    ensures q.Some? ==> InBounds(|g|, q.value) && Adjacent(Blank(g), q.value)
    ensures q.None? <==> |g| == 1
  {
    var nb := Neighbors(|g|, Blank(g), Directions);
    NeighborsSpec(|g|, Blank(g));
    if |nb| == 0 then None else Some(nb[Pick(roll, |nb|)])
  }

  /**
   * One iteration of shuffleBoard's loop: the blank trades places with the
   * chosen neighbour; the board keeps its shape, its blank and its labels.
   */
  function Step(g: Board, roll: real): (h: Board)
    requires IsSquare(g) && Occurs(g, 0) && 0.0 <= roll < 1.0
    ensures IsSquare(h) && |h| == |g| && Occurs(h, 0)
    ensures multiset(Flatten(h)) == multiset(Flatten(g))
  {
    match StepTarget(g, roll)
    case None => g
    case Some(q) =>
      SlideSpec(g, Blank(g), q);
      Slide(g, Blank(g), q)
  }

  /**
   * On a board of distinct labels a shuffle step is a legal move: the label
   * next to the blank passes isValidMove and moveTile would produce the same board.
   */
  lemma StepIsLegalMove(g: Board, roll: real)
    requires IsSquare(g) && Occurs(g, 0) && 0.0 <= roll < 1.0 && Distinct(g)
    ensures StepTarget(g, roll).Some? ==>
      var tile := At(g, StepTarget(g, roll).value);
      ValidMove(g, tile) && Step(g, roll) == Moved(g, tile)
    ensures StepTarget(g, roll).None? ==> Step(g, roll) == g
  {
    if StepTarget(g, roll).Some? {
      var q := StepTarget(g, roll).value;
      DistinctFind(g, q);
      FindSpec(g, 0);
    }
  }

  /**
   * The board after shuffleBoard has consumed the given rolls, one per
   * iteration.  It keeps its shape, its blank and its multiset of labels.
   */
  function Shuffled(g: Board, rolls: seq<real>): (h: Board)
    requires IsSquare(g) && Rolls(rolls) && (rolls != [] ==> Occurs(g, 0))
    ensures IsSquare(h) && |h| == |g|
    ensures Occurs(g, 0) ==> Occurs(h, 0)
    ensures multiset(Flatten(h)) == multiset(Flatten(g))
    decreases |rolls|
  {
    if rolls == [] then g
    else Step(Shuffled(g, rolls[..|rolls| - 1]), rolls[|rolls| - 1])
  }

  /**
   * Shuffling a board of distinct labels keeps them distinct, so every step
   * of the walk is a legal move in the sense of StepIsLegalMove.
   */
  lemma ShuffledDistinct(g: Board, rolls: seq<real>)
    requires IsSquare(g) && Rolls(rolls) && (rolls != [] ==> Occurs(g, 0))
    requires NoDup(Flatten(g))
    ensures NoDup(Flatten(Shuffled(g, rolls)))
    ensures Distinct(Shuffled(g, rolls))
  {
    NoDupMultiset(Flatten(g));
    NoDupMultiset(Flatten(Shuffled(g, rolls)));
    NoDupDistinct(Shuffled(g, rolls));
  }
}
