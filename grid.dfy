/**
 * The puzzle board as a value: an n-by-n grid of integer labels read row by
 * row, where label 0 is the blank.  This module holds the vocabulary the rest
 * of the model is stated in: positions, the row-major search that
 * getTilePos performs, and the row-major flattening that Array.prototype.flat
 * produces.
 */
module Grid {

  datatype Option<T> = None | Some(value: T)

  /** A cell address, the {row, col} record of the source. */
  datatype Pos = Pos(row: int, col: int)

  /** A board read as its sequence of rows. */
  type Board = seq<seq<int>>

  /** Every row is exactly as long as there are rows. */
  predicate IsSquare(g: Board) {
    forall r :: 0 <= r < |g| ==> |g[r]| == |g|
  }

  /** Every row has length w. */
  predicate Width(rows: seq<seq<int>>, w: nat) {
    forall r :: 0 <= r < |rows| ==> |rows[r]| == w
  }

  predicate InBounds(n: int, p: Pos) {
    0 <= p.row < n && 0 <= p.col < n
  }

  function At(g: Board, p: Pos): int
    requires IsSquare(g) && InBounds(|g|, p)
  {
    g[p.row][p.col]
  }

  /** Some cell of g holds t. */
  ghost predicate Occurs(g: Board, t: int)
    requires IsSquare(g)
  {
    exists p :: InBounds(|g|, p) && At(g, p) == t
  }

  /** p comes strictly before q in row-major order. */
  predicate Before(p: Pos, q: Pos) {
    p.row < q.row || (p.row == q.row && p.col < q.col)
  }

  /** p is the first cell, in row-major order, that holds t. */
  ghost predicate FirstAt(g: Board, t: int, p: Pos)
    requires IsSquare(g)
  {
    && InBounds(|g|, p)
    && At(g, p) == t
    && forall q :: InBounds(|g|, q) && Before(q, p) ==> At(g, q) != t
  }

  /** Every label is held by at most one cell. */
  ghost predicate Distinct(g: Board)
    requires IsSquare(g)
  {
    forall p, q :: InBounds(|g|, p) && InBounds(|g|, q) && At(g, p) == At(g, q) ==> p == q
  }

  /** The first column at or after c whose entry is t (the inner loop of getTilePos). */
  function IndexIn(row: seq<int>, t: int, c: nat): (k: Option<nat>)
    ensures k.Some? ==> c <= k.value < |row| && row[k.value] == t
    ensures k.Some? ==> forall j :: c <= j < k.value ==> row[j] != t
    ensures k.None? ==> forall j :: c <= j < |row| ==> row[j] != t
    decreases |row| - c
  {
    if c >= |row| then None
    else if row[c] == t then Some(c)
    else IndexIn(row, t, c + 1)
  }

  /** The first cell holding t in rows r, r+1, ... (the outer loop of getTilePos). */
  function FindFrom(g: Board, t: int, r: nat): (p: Option<Pos>)
    requires IsSquare(g)
    ensures p.Some? ==> r <= p.value.row && InBounds(|g|, p.value) && At(g, p.value) == t
    ensures p.Some? ==> forall q :: InBounds(|g|, q) && r <= q.row && Before(q, p.value) ==> At(g, q) != t
    ensures p.None? ==> forall q :: InBounds(|g|, q) && r <= q.row ==> At(g, q) != t
    decreases |g| - r
  {
    if r >= |g| then None
    else match IndexIn(g[r], t, 0)
      case Some(c) => Some(Pos(r, c))
      case None => FindFrom(g, t, r + 1)
  }

  /** getTilePos as a value: the first cell holding t, or None. */
  function Find(g: Board, t: int): (p: Option<Pos>)
    requires IsSquare(g)
    ensures p.Some? <==> Occurs(g, t)
    ensures p.Some? ==> FirstAt(g, t, p.value)
  {
    FindFrom(g, t, 0)
  }

  /**
   * Find answers None exactly when t occurs nowhere, and otherwise the unique
   * first cell holding t.
   */
  lemma FindSpec(g: Board, t: int)
    requires IsSquare(g)
    ensures Find(g, t).None? <==> !Occurs(g, t)
    ensures forall p :: FirstAt(g, t, p) <==> Find(g, t) == Some(p)
  {
    forall p | FirstAt(g, t, p)
      ensures Find(g, t) == Some(p)
    {
      var q := Find(g, t).value;
      assert !Before(p, q) && !Before(q, p);
    }
  }

  /** On a board whose labels are distinct, every cell is the first holding its label. */
  lemma DistinctFind(g: Board, p: Pos)
    requires IsSquare(g) && Distinct(g) && InBounds(|g|, p)
    ensures Find(g, At(g, p)) == Some(p)
  {
    assert FirstAt(g, At(g, p), p);
    FindSpec(g, At(g, p));
  }

  /** Extensionality for boards: equal shape and equal cells make equal boards. */
  lemma BoardEq(g: Board, h: Board)
    requires IsSquare(g) && IsSquare(h) && |g| == |h|
    requires forall p :: InBounds(|g|, p) ==> At(g, p) == At(h, p)
    ensures g == h
  {
    forall r | 0 <= r < |g|
      ensures g[r] == h[r]
    {
      forall c | 0 <= c < |g|
        ensures g[r][c] == h[r][c]
      {
        assert At(g, Pos(r, c)) == At(h, Pos(r, c));
      }
    }
  }

  // ---- Row-major flattening ----

  /** The rows written one after another, as Array.prototype.flat does. */
  function Flatten(rows: seq<seq<int>>): seq<int>
  {
    if rows == [] then [] else Flatten(rows[..|rows| - 1]) + rows[|rows| - 1]
  }

  lemma FlattenAppend(rows: seq<seq<int>>, row: seq<int>)
    ensures Flatten(rows + [row]) == Flatten(rows) + row
  {
    assert (rows + [row])[..|rows|] == rows;
  }

  lemma MulStep(a: int, w: int)
    ensures (a + 1) * w == a * w + w
  {
  }

  lemma {:induction false} FlattenLength(rows: seq<seq<int>>, w: nat)
    requires Width(rows, w)
    ensures |Flatten(rows)| == |rows| * w
  {
    if rows != [] {
      FlattenLength(rows[..|rows| - 1], w);
      MulStep(|rows| - 1, w);
    }
  }

  lemma MulMonotone(a: int, b: int, w: nat)
    requires a <= b
    ensures a * w <= b * w
  {
    assert b * w - a * w == (b - a) * w;
  }

  /** Cell (r, c) sits at index r*w + c of the flattening. */
  lemma {:induction false} FlattenAt(rows: seq<seq<int>>, w: nat, r: int, c: int)
    requires Width(rows, w) && 0 <= r < |rows| && 0 <= c < w
    ensures 0 <= r * w + c < |Flatten(rows)|
    ensures Flatten(rows)[r * w + c] == rows[r][c]
  {
    var m := |rows| - 1;
    var prefix := rows[..m];
    FlattenLength(prefix, w);
    MulStep(m, w);
    MulMonotone(0, r, w);
    if r < m {
      FlattenAt(prefix, w, r, c);
    }
  }

  /** Every index of the flattening is some cell (r, c), at r*w + c. */
  lemma {:induction false} FlattenIndex(rows: seq<seq<int>>, w: nat, k: int) returns (p: Pos)
    requires Width(rows, w) && 0 <= k < |Flatten(rows)|
    ensures 0 <= p.row < |rows| && 0 <= p.col < w
    ensures k == p.row * w + p.col
    ensures Flatten(rows)[k] == rows[p.row][p.col]
  {
    var m := |rows| - 1;
    var prefix := rows[..m];
    FlattenLength(prefix, w);
    MulStep(m, w);
    if k < |Flatten(prefix)| {
      p := FlattenIndex(prefix, w, k);
    } else {
      p := Pos(m, k - m * w);
    }
  }

  /** Row-major addresses are injective. */
  lemma RowMajorInjective(n: nat, p: Pos, q: Pos)
    requires InBounds(n, p) && InBounds(n, q)
    requires p.row * n + p.col == q.row * n + q.col
    ensures p == q
  {
    if p.row < q.row {
      MulMonotone(p.row + 1, q.row, n);
      MulStep(p.row, n);
    } else if q.row < p.row {
      MulMonotone(q.row + 1, p.row, n);
      MulStep(q.row, n);
    }
  }

  /** A label occurs on the board exactly when it occurs in the flattening. */
  lemma OccursFlat(g: Board, t: int)
    requires IsSquare(g)
    ensures Occurs(g, t) <==> t in Flatten(g)
  {
    if Occurs(g, t) {
      var p :| InBounds(|g|, p) && At(g, p) == t;
      FlattenAt(g, |g|, p.row, p.col);
    }
    if t in Flatten(g) {
      var k :| 0 <= k < |Flatten(g)| && Flatten(g)[k] == t;
      var p := FlattenIndex(g, |g|, k);
      assert At(g, p) == t;
    }
  }

  /** No two entries of s are equal. */
  predicate NoDup(s: seq<int>) {
    forall i, j :: 0 <= i < j < |s| ==> s[i] != s[j]
  }

  /** A sequence repeats no entry exactly when no entry's count exceeds one. */
  lemma {:induction false} NoDupMultiset(s: seq<int>)
    ensures NoDup(s) <==> forall x :: multiset(s)[x] <= 1
  {
    if s != [] {
      var m := |s| - 1;
      var pre := s[..m];
      assert s == pre + [s[m]];
      NoDupMultiset(pre);
      if NoDup(s) {
        assert NoDup(pre);
        assert s[m] !in pre;
      }
      if forall x :: multiset(s)[x] <= 1 {
        forall x ensures multiset(pre)[x] <= 1 {
          assert multiset(s)[x] == multiset(pre)[x] + (if x == s[m] then 1 else 0);
        }
        assert multiset(s)[s[m]] == multiset(pre)[s[m]] + 1;
        assert multiset(pre)[s[m]] == 0;
        forall i, j | 0 <= i < j < |s| ensures s[i] != s[j] {
          if j == m {
            assert s[i] in pre;
          }
        }
      }
    }
  }

  /** A flattening without repeated labels means a board of distinct labels. */
  lemma NoDupDistinct(g: Board)
    requires IsSquare(g) && NoDup(Flatten(g))
    ensures Distinct(g)
  {
    var n := |g|;
    forall p, q | InBounds(n, p) && InBounds(n, q) && At(g, p) == At(g, q)
      ensures p == q
    {
      FlattenAt(g, n, p.row, p.col);
      FlattenAt(g, n, q.row, q.col);
      RowMajorInjective(n, p, q);
    }
  }

  // ---- Writing one cell ----

  /** The board with cell p set to v. */
  function Put(g: Board, p: Pos, v: int): (h: Board)
    requires IsSquare(g) && InBounds(|g|, p)
    ensures IsSquare(h) && |h| == |g|
    ensures forall q :: InBounds(|g|, q) ==> At(h, q) == if q == p then v else At(g, q)
  {
    g[p.row := g[p.row][p.col := v]]
  }

  lemma SeqUpdateMultiset(s: seq<int>, c: int, v: int)
    requires 0 <= c < |s|
    ensures multiset(s[c := v]) + multiset{s[c]} == multiset(s) + multiset{v}
  {
    assert s == s[..c] + [s[c]] + s[c + 1..];
    assert s[c := v] == s[..c] + [v] + s[c + 1..];
  }

  /** Replacing one row changes the flattening's multiset by exactly that row. */
  lemma {:induction false} FlattenUpdateMultiset(rows: seq<seq<int>>, r: int, row: seq<int>)
    requires 0 <= r < |rows|
    ensures multiset(Flatten(rows[r := row])) + multiset(rows[r])
         == multiset(Flatten(rows)) + multiset(row)
  {
    var m := |rows| - 1;
    var upd := rows[r := row];
    if r == m {
      assert upd[..m] == rows[..m];
    } else {
      assert upd[..m] == rows[..m][r := row];
      assert upd[m] == rows[m];
      assert rows[..m][r] == rows[r];
      FlattenUpdateMultiset(rows[..m], r, row);
      calc {
        multiset(Flatten(upd)) + multiset(rows[r]);
        multiset(Flatten(rows[..m][r := row])) + multiset(rows[m]) + multiset(rows[r]);
        multiset(Flatten(rows[..m])) + multiset(row) + multiset(rows[m]);
        multiset(Flatten(rows)) + multiset(row);
      }
    }
  }

  /** Writing v into cell p swaps one occurrence of the old label for v. */
  lemma PutMultiset(g: Board, p: Pos, v: int)
    requires IsSquare(g) && InBounds(|g|, p)
    ensures multiset(Flatten(Put(g, p, v))) + multiset{At(g, p)}
         == multiset(Flatten(g)) + multiset{v}
  {
    var row := g[p.row][p.col := v];
    FlattenUpdateMultiset(g, p.row, row);
    SeqUpdateMultiset(g[p.row], p.col, v);
    calc {
      multiset(Flatten(Put(g, p, v))) + multiset{At(g, p)};
      multiset(Flatten(g[p.row := row])) + multiset{g[p.row][p.col]};
      multiset(Flatten(g)) + multiset(row) - multiset(g[p.row]) + multiset{g[p.row][p.col]};
      multiset(Flatten(g)) + multiset{v};
    }
  }

  /** A subset is no larger than its superset. */
  lemma SubsetSize(a: set<int>, b: set<int>)
    requires a <= b
    ensures |a| <= |b|
    ensures |a| == |b| ==> a == b
  {
    assert b == a + (b - a);
    assert a * (b - a) == {};
    assert |b| == |a| + |b - a|;
    if |a| == |b| {
      assert b - a == {};
    }
  }
}
