/**
 The cell-level data of the board: coordinates and the `Deck` record, one
 occupied cell of a ship together with its alive/dead status.
 */
module Decks {

  /** A board coordinate `(row, column)`; 0-based, but nothing here bounds it. */
  type Coord = (int, int)

  /** One cell of a ship. `isAlive` turns false when the cell is shot. */
  datatype Deck = Deck(row: int, column: int, isAlive: bool)

  /** The coordinate a deck occupies. */
  function Pos(d: Deck): Coord {
    (d.row, d.column)
  }

  /** True iff deck `d` sits at `(row, column)`. */
  predicate At(d: Deck, row: int, column: int) {
    d.row == row && d.column == column
  }

  /** The set of coordinates occupied by a sequence of decks. */
  function CellsOf(decks: seq<Deck>): (cells: set<Coord>)
    ensures forall c :: c in cells <==> exists k :: 0 <= k < |decks| && Pos(decks[k]) == c
    decreases |decks|
  {
    if decks == [] then {}
    else
      var n := |decks| - 1;
      assert forall k :: 0 <= k < n ==> decks[..n][k] == decks[k];
      CellsOf(decks[..n]) + {Pos(decks[n])}
  }

  /** No two decks of the sequence share a coordinate. */
  predicate DistinctCells(decks: seq<Deck>) {
    forall k, l :: 0 <= k < l < |decks| ==> Pos(decks[k]) != Pos(decks[l])
  }

  /** Dropping the last deck keeps the coordinates pairwise different. */
  lemma DistinctPrefix(decks: seq<Deck>)
    requires decks != [] && DistinctCells(decks)
    ensures DistinctCells(decks[..|decks| - 1])
  {
    var prefix := decks[..|decks| - 1];
    forall k, l | 0 <= k < l < |prefix|
      ensures Pos(prefix[k]) != Pos(prefix[l])
    {
      assert prefix[k] == decks[k] && prefix[l] == decks[l];
    }
  }

  /** With pairwise different coordinates, the last deck's cell is not covered by the others. */
  lemma LastCellNew(decks: seq<Deck>)
    requires decks != [] && DistinctCells(decks)
    ensures Pos(decks[|decks| - 1]) !in CellsOf(decks[..|decks| - 1])
  {
    var n := |decks| - 1;
    var prefix := decks[..n];
    forall k | 0 <= k < |prefix|
      ensures Pos(prefix[k]) != Pos(decks[n])
    {
      assert prefix[k] == decks[k];
    }
  }

  /** Decks at pairwise different coordinates cover exactly as many cells as there are decks. */
  lemma {:induction false} CellsOfSize(decks: seq<Deck>)
    requires DistinctCells(decks)
    ensures |CellsOf(decks)| == |decks|
    decreases |decks|
  {
    if decks != [] {
      var n := |decks| - 1;
      DistinctPrefix(decks);
      CellsOfSize(decks[..n]);
      LastCellNew(decks);
    }
  }

  /** Two deck sequences with the same coordinates, position by position, cover the same cells. */
  lemma SameShapeSameCells(a: seq<Deck>, b: seq<Deck>)
    requires |a| == |b|
    requires forall k :: 0 <= k < |a| ==> Pos(a[k]) == Pos(b[k])
    ensures CellsOf(a) == CellsOf(b)
  {
    forall c
      ensures c in CellsOf(a) <==> c in CellsOf(b)
    {
      if c in CellsOf(a) {
        var k :| 0 <= k < |a| && Pos(a[k]) == c;
        assert Pos(b[k]) == c;
      }
      if c in CellsOf(b) {
        var k :| 0 <= k < |b| && Pos(b[k]) == c;
        assert Pos(a[k]) == c;
      }
    }
  }
}
