/**
 * The two read-only checks of the puzzle, as values: isSolved compares the
 * row-major reading of the board with 1, 2, ..., N*N-1, 0, and validateBoard
 * reports repeated and absent labels.
 */
module Checks {
  import opened Grid

  /** The canonical row-major reading 1, 2, ..., total-1, 0. */
  function SolvedOrder(total: nat): (s: seq<int>)
    requires total >= 1
    ensures |s| == total && s[total - 1] == 0
    ensures forall i :: 0 <= i < total - 1 ==> s[i] == i + 1
  {
    seq(total - 1, i => i + 1) + [0]
  }

  /** The board reads 1, 2, ..., N*N-1, 0 row by row. */
  predicate Solved(g: Board)
    requires IsSquare(g) && |g| >= 1
  {
    Flatten(g) == SolvedOrder(|g| * |g|)
  }

  /**
   * Solved as isSolved reads it: entry i of the row-major reading is i+1 for
   * every i below N*N-1, and the last entry is the blank.
   */
  lemma SolvedReading(g: Board)
    requires IsSquare(g) && |g| >= 1
    ensures |Flatten(g)| == |g| * |g|
    ensures Solved(g) <==>
      && (forall i :: 0 <= i < |g| * |g| - 1 ==> Flatten(g)[i] == i + 1)
      && Flatten(g)[|g| * |g| - 1] == 0
  {
    FlattenLength(g, |g|);
    var total := |g| * |g|;
    if (forall i :: 0 <= i < total - 1 ==> Flatten(g)[i] == i + 1) && Flatten(g)[total - 1] == 0 {
      assert forall i :: 0 <= i < total ==> Flatten(g)[i] == SolvedOrder(total)[i];
    }
  }

  /** The label the solved board has at p: r*N + c + 1, and 0 in the last cell. */
  function SolvedLabel(n: nat, p: Pos): int {
    if p == Pos(n - 1, n - 1) then 0 else p.row * n + p.col + 1
  }

  lemma LastIndex(n: nat)
    requires n >= 1
    ensures (n - 1) * n + (n - 1) == n * n - 1
  {
    MulStep(n - 1, n);
  }

  /**
   * Solved in terms of cells: every cell (r, c) holds r*N + c + 1 except the
   * bottom-right one, which holds the blank.
   */
  lemma SolvedCells(g: Board)
    requires IsSquare(g) && |g| >= 1
    ensures Solved(g) <==> forall p :: InBounds(|g|, p) ==> At(g, p) == SolvedLabel(|g|, p)
  {
    var n := |g|;
    var total := n * n;
    FlattenLength(g, n);
    LastIndex(n);
    if Solved(g) {
      forall p | InBounds(n, p)
        ensures At(g, p) == SolvedLabel(n, p)
      {
        FlattenAt(g, n, p.row, p.col);
        if p != Pos(n - 1, n - 1) {
          assert p.row * n + p.col != (n - 1) * n + (n - 1) by {
            if p.row * n + p.col == (n - 1) * n + (n - 1) {
              RowMajorInjective(n, p, Pos(n - 1, n - 1));
            }
          }
        }
      }
    }
    if forall p :: InBounds(n, p) ==> At(g, p) == SolvedLabel(n, p) {
      forall k | 0 <= k < total
        ensures Flatten(g)[k] == SolvedOrder(total)[k]
      {
        var p := FlattenIndex(g, n, k);
        assert At(g, p) == SolvedLabel(n, p);
        if p == Pos(n - 1, n - 1) {
          assert k == total - 1;
        } else {
          assert k != total - 1 by {
            if k == total - 1 {
              RowMajorInjective(n, p, Pos(n - 1, n - 1));
            }
          }
        }
      }
    }
  }

  /** A solved board has its blank in the bottom-right cell. */
  lemma SolvedBlank(g: Board)
    requires IsSquare(g) && |g| >= 1 && Solved(g)
    ensures At(g, Pos(|g| - 1, |g| - 1)) == 0 && Occurs(g, 0)
  {
    SolvedCells(g);
    assert InBounds(|g|, Pos(|g| - 1, |g| - 1));
  }

  // ---- validateBoard ----

  /** new Set(flatBoard). */
  function Elems(s: seq<int>): set<int> {
    set x | x in s
  }

  /** The seen dictionary once every entry of s is counted: label to count. */
  function Tally(s: seq<int>): map<int, nat> {
    map x | x in s :: multiset(s)[x]
  }

  /** Counting one more entry v bumps v's tally and no other. */
  lemma TallySnoc(s: seq<int>, v: int)
    ensures Tally(s + [v]) == Tally(s)[v := (if v in Tally(s) then Tally(s)[v] else 0) + 1]
  {
    var t, u := Tally(s), Tally(s + [v]);
    var w := t[v := (if v in t then t[v] else 0) + 1];
    assert multiset(s + [v]) == multiset(s) + multiset{v};
    forall x ensures x in u <==> x in w {
      assert x in s + [v] <==> x in s || x == v;
    }
    forall x | x in u ensures u[x] == w[x] {
      if x != v {
        assert x in s;
      }
    }
  }

  /** The entries of pre that occur more than once in s, each with its count in s. */
  function DuplicatesAmong(s: seq<int>, pre: seq<int>): map<int, nat> {
    map x | x in pre && multiset(s)[x] > 1 :: multiset(s)[x]
  }

  /** The labels occurring more than once, each with its count. */
  function Duplicates(s: seq<int>): map<int, nat> {
    DuplicatesAmong(s, s)
  }

  /** Looking at one more entry v of pre adds v when it is repeated in s. */
  lemma DuplicatesAmongSnoc(s: seq<int>, pre: seq<int>, v: int)
    ensures DuplicatesAmong(s, pre + [v]) ==
      if multiset(s)[v] > 1 then DuplicatesAmong(s, pre)[v := multiset(s)[v]] else DuplicatesAmong(s, pre)
  {
    forall x ensures x in pre + [v] <==> x in pre || x == v {
    }
  }

  /** The i in 0..k-1 that do not occur in s, ascending. */
  function MissingBelow(s: seq<int>, k: nat): (m: seq<int>)
    ensures forall x :: x in m <==> 0 <= x < k && x !in s
    ensures forall i, j :: 0 <= i < j < |m| ==> m[i] < m[j]
    ensures forall i :: 0 <= i < |m| ==> m[i] < k
  {
    if k == 0 then []
    else MissingBelow(s, k - 1) + (if k - 1 in s then [] else [k - 1])
  }

  /** What validateBoard reports about a corrupt board. */
  datatype Report = Report(duplicates: map<int, nat>, missing: seq<int>)

  /** validateBoard: None when the N*N cells hold N*N distinct labels. */
  function Validate(g: Board): Option<Report>
    requires IsSquare(g)
  {
    var flat := Flatten(g);
    if |Elems(flat)| == |g| * |g| then None
    else Some(Report(Duplicates(flat), MissingBelow(flat, |g| * |g|)))
  }

  /** A sequence has as many distinct entries as entries exactly when it repeats none. */
  lemma {:induction false} ElemsSize(s: seq<int>)
    ensures |Elems(s)| <= |s|
    ensures |Elems(s)| == |s| <==> NoDup(s)
  {
    if s != [] {
      var m := |s| - 1;
      var pre := s[..m];
      assert s == pre + [s[m]];
      ElemsSize(pre);
      assert Elems(s) == Elems(pre) + {s[m]};
      if s[m] in pre {
        assert Elems(s) == Elems(pre);
        var i :| 0 <= i < m && pre[i] == s[m];
        assert s[i] == s[m];
      } else {
        assert NoDup(s) <==> NoDup(pre) by {
          if NoDup(pre) {
            forall i, j | 0 <= i < j < |s| ensures s[i] != s[j] {
              if j == m {
                assert s[i] in pre;
              } else {
                assert pre[i] != pre[j];
              }
            }
          }
        }
      }
    }
  }

  /** validateBoard returns null exactly when every cell holds a different label. */
  lemma ValidateNone(g: Board)
    requires IsSquare(g)
    ensures Validate(g).None? <==> NoDup(Flatten(g))
    ensures Validate(g).None? <==> Distinct(g)
  {
    FlattenLength(g, |g|);
    ElemsSize(Flatten(g));
    if NoDup(Flatten(g)) {
      NoDupDistinct(g);
    }
    if Distinct(g) {
      DistinctNoDup(g);
    }
  }

  lemma DistinctNoDup(g: Board)
    requires IsSquare(g) && Distinct(g)
    ensures NoDup(Flatten(g))
  {
    var n := |g|;
    forall i, j | 0 <= i < j < |Flatten(g)|
      ensures Flatten(g)[i] != Flatten(g)[j]
    {
      var p := FlattenIndex(g, n, i);
      var q := FlattenIndex(g, n, j);
      assert p != q;
      assert At(g, p) != At(g, q);
    }
  }

  /** A repeated entry is counted at least twice. */
  lemma RepeatCount(s: seq<int>, i: int, j: int)
    requires 0 <= i < j < |s| && s[i] == s[j]
    ensures multiset(s)[s[i]] >= 2
  {
    assert s == s[..j] + [s[j]] + s[j + 1..];
    assert s[i] in s[..j];
  }

  /** The labels 0..k-1. */
  function Below(k: nat): (r: set<int>)
    ensures forall x :: x in r <==> 0 <= x < k
    ensures |r| == k
  {
    if k == 0 then {} else Below(k - 1) + {k - 1}
  }

  /**
   * The report of a corrupt board: the duplicates are exactly the labels held
   * by more than one cell, with their counts; the missing list is exactly the
   * labels 0..N*N-1 that no cell holds, ascending; and neither part is empty,
   * since N*N cells with a repeated label cannot cover all N*N labels.
   */
  lemma ReportSpec(g: Board)
    requires IsSquare(g) && Validate(g).Some?
    ensures var rep, total := Validate(g).value, |g| * |g|;
      && (forall x :: x in rep.duplicates <==> multiset(Flatten(g))[x] > 1)
      && (forall x :: x in rep.duplicates ==> rep.duplicates[x] == multiset(Flatten(g))[x])
      && (forall x :: x in rep.missing <==> 0 <= x < total && !Occurs(g, x))
      && (forall i, j :: 0 <= i < j < |rep.missing| ==> rep.missing[i] < rep.missing[j])
      && rep.duplicates != map[]
      && rep.missing != []
  {
    var rep := Validate(g).value;
    forall x ensures x in rep.missing <==> 0 <= x < |g| * |g| && !Occurs(g, x) {
      OccursFlat(g, x);
    }
    DuplicatesNonEmpty(g);
    MissingNonEmpty(g);
  }

  lemma DuplicatesNonEmpty(g: Board)
    requires IsSquare(g) && Validate(g).Some?
    ensures Validate(g).value.duplicates != map[]
  {
    var flat := Flatten(g);
    ValidateNone(g);
    var i, j :| 0 <= i < j < |flat| && flat[i] == flat[j];
    RepeatCount(flat, i, j);
    assert flat[i] in Validate(g).value.duplicates;
  }

  lemma MissingNonEmpty(g: Board)
    requires IsSquare(g) && Validate(g).Some?
    ensures Validate(g).value.missing != []
  {
    var flat, total := Flatten(g), |g| * |g|;
    FlattenLength(g, |g|);
    ElemsSize(flat);
    var k := Uncovered(Elems(flat), total);
    assert k in Validate(g).value.missing;
  }

  /** Fewer than k labels cannot include all of 0..k-1. */
  lemma Uncovered(a: set<int>, k: nat) returns (x: int)
    requires |a| < k
    ensures 0 <= x < k && x !in a
  {
    if Below(k) <= a {
      SubsetSize(Below(k), a);
      assert false;
    }
    x :| x in Below(k) && x !in a;
  }

  /**
   * On a board whose labels all lie in 0..N*N-1, validateBoard returns null
   * exactly when every label 0..N*N-1 is present, that is, when the board is
   * a bijection between cells and labels.
   */
  lemma ValidateInRange(g: Board)
    requires IsSquare(g)
    requires forall p :: InBounds(|g|, p) ==> 0 <= At(g, p) < |g| * |g|
    ensures Validate(g).None? <==> forall x :: 0 <= x < |g| * |g| ==> Occurs(g, x)
  {
    var flat, total := Flatten(g), |g| * |g|;
    var range := Below(total);
    FlattenLength(g, |g|);
    ElemsSize(flat);
    assert Elems(flat) <= range by {
      forall x | x in Elems(flat) ensures x in range {
        var k :| 0 <= k < |flat| && flat[k] == x;
        var p := FlattenIndex(g, |g|, k);
        assert At(g, p) == x;
      }
    }
    if Validate(g).None? {
      SubsetSize(Elems(flat), range);
      forall x | 0 <= x < total ensures Occurs(g, x) {
        assert x in range;
        OccursFlat(g, x);
      }
    }
    if forall x :: 0 <= x < total ==> Occurs(g, x) {
      assert range <= Elems(flat) by {
        forall x | x in range ensures x in Elems(flat) {
          OccursFlat(g, x);
        }
      }
      SubsetSize(range, Elems(flat));
    }
  }

  /** Any rearrangement of the solved board's labels passes validateBoard. */
  lemma PermutationIsValid(g: Board)
    requires IsSquare(g) && |g| >= 1
    requires multiset(Flatten(g)) == multiset(SolvedOrder(|g| * |g|))
    ensures Validate(g) == None
    ensures Distinct(g)
  {
    var solved := SolvedOrder(|g| * |g|);
    assert NoDup(solved);
    NoDupMultiset(solved);
    NoDupMultiset(Flatten(g));
    ValidateNone(g);
  }

  /** validateBoard looks only at the count of distinct labels, not at their range. */
  lemma ValidateIgnoresRange()
    ensures Validate([[5]]) == None
    ensures !Occurs([[5]], 0)
  {
    assert Flatten([[5]]) == [5];
    assert Elems([5]) == {5};
  }
}
