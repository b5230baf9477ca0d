/** Shared vocabulary of the queens-with-regions puzzle engine: the board side,
    cell states, queens, grids and a small set helper. */
module Puzzle {

  /** Side length of the board; every grid is SIZE x SIZE. */
  const SIZE: nat := 8

  /** State of one board cell. `XCell` is the player's "x" marker. */
  datatype CellState = EmptyCell | XCell | QueenCell

  /** A queen placed at one cell. */
  datatype Queen = Queen(row: int, col: int)

  datatype Option<T> = None | Some(value: T)

  type Board = seq<seq<CellState>>

  /** Region identifier of every cell. */
  type RegionGrid = seq<seq<int>>

  predicate InBounds(r: int, c: int) {
    0 <= r < SIZE && 0 <= c < SIZE
  }

  /** g has SIZE rows of SIZE cells each. */
  predicate IsGrid<T>(g: seq<seq<T>>) {
    |g| == SIZE && forall r :: 0 <= r < SIZE ==> |g[r]| == SIZE
  }

  function Abs(x: int): nat {
    if x < 0 then -x else x
  }

  /** King-move distance between two queens. */
  function Chebyshev(a: Queen, b: Queen): nat {
    var dr, dc := Abs(a.row - b.row), Abs(a.col - b.col);
    if dr < dc then dc else dr
  }

  /** The set of the elements of s, as `new Set(s)` builds it. */
  function Elems<T(!new)>(s: seq<T>): (e: set<T>)
    ensures forall x :: x in e <==> x in s
  {
    set x | x in s
  }

  /** No element of s occurs twice. */
  predicate Distinct<T(==)>(s: seq<T>) {
    forall i, j :: 0 <= i < j < |s| ==> s[i] != s[j]
  }

  /** A set built from a sequence is never larger than it, and has exactly
      its size precisely when no element repeats: this is what lets a
      `new Set(...).size === SIZE` test stand for "pairwise distinct". */
  lemma {:induction false} ElemsSize<T(!new)>(s: seq<T>)
    ensures |Elems(s)| <= |s|
    ensures |Elems(s)| == |s| <==> Distinct(s)
  {
    if s != [] {
      var t := s[1..];
      ElemsSize(t);
      assert Elems(s) == {s[0]} + Elems(t) by {
        assert s == [s[0]] + t;
      }
      assert forall i :: 0 <= i < |t| ==> t[i] == s[i + 1];
      if s[0] in Elems(t) {
        assert s[0] in t;
        var j :| 0 <= j < |t| && t[j] == s[0];
        assert s[0] == s[j + 1];
        assert !Distinct(s);
      } else {
        assert |Elems(s)| == |Elems(t)| + 1;
        if Distinct(t) {
          forall i, j | 0 <= i < j < |s| ensures s[i] != s[j] {
            if i == 0 {
              assert s[j] == t[j - 1];
              assert s[j] in Elems(t);
            } else {
              assert s[i] == t[i - 1] && s[j] == t[j - 1];
            }
          }
        } else {
          var i, j :| 0 <= i < j < |t| && t[i] == t[j];
          assert s[i + 1] == s[j + 1];
        }
      }
    }
  }
}
